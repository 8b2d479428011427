/**
 * The ReaPack index update of the release tool (tools/mkreapack.py, `main`):
 * old `<version>` blocks are aged out, the new release's block is assembled
 * from its `<source>` lines and changelog, and it is inserted below the
 * `<reapack>` line.
 *
 * The git tag time, the repository name, the absolute paths of the root and
 * of the release files, and the contents of the files read are inputs.
 */
module ReapackIndex {
  import opened Outcomes
  import opened Text
  import opened Scan
  import opened ReapackVersion
  import opened ReapackChangelog

  const OpenTag := "<version "
  const CloseTag := "</version>\n"

  /** `p` fits in `t` at index `k` and its characters from `j` on agree with the text. */
  predicate AtFrom(t: string, k: nat, p: string, j: nat)
    requires j <= |p|
    decreases |p| - j
  {
    k + |p| <= |t| && (j == |p| || (t[k + j] == p[j] && AtFrom(t, k, p, j + 1)))
  }

  /** `p` occurs in `t` at index `k`, compared character by character. */
  predicate At(t: string, k: nat, p: string) {
    AtFrom(t, k, p, 0)
  }

  lemma {:induction false} AtFromIsSlice(t: string, k: nat, p: string, j: nat)
    requires j <= |p|
    ensures AtFrom(t, k, p, j) <==> k + |p| <= |t| && t[k + j..k + |p|] == p[j..]
    decreases |p| - j
  {
    if j < |p| && k + |p| <= |t| {
      AtFromIsSlice(t, k, p, j + 1);
      assert t[k + j..k + |p|] == [t[k + j]] + t[k + j + 1..k + |p|];
      assert p[j..] == [p[j]] + p[j + 1..];
    }
  }

  /** The character-wise comparison is the slice comparison. */
  lemma AtIsStartsAt(t: string, k: nat, p: string)
    ensures At(t, k, p) <==> StartsAt(t, k, p)
  {
    AtFromIsSlice(t, k, p, 0);
    assert p[0..] == p;
  }

  lemma {:induction false} AtFromInSlice(t: string, lo: nat, hi: nat, k: nat, p: string, j: nat)
    requires lo <= k && k + |p| <= hi <= |t| && j <= |p|
    ensures AtFrom(t[lo..hi], k - lo, p, j) == AtFrom(t, k, p, j)
    decreases |p| - j
  {
    if j < |p| {
      assert t[lo..hi][k - lo + j] == t[k + j];
      AtFromInSlice(t, lo, hi, k, p, j + 1);
    }
  }

  /** Comparing inside a slice of the text that holds the whole occurrence gives the same answer. */
  lemma AtInSlice(t: string, lo: nat, hi: nat, k: nat, p: string)
    requires lo <= k && k + |p| <= hi <= |t|
    ensures At(t[lo..hi], k - lo, p) == At(t, k, p)
  {
    AtFromInSlice(t, lo, hi, k, p, 0);
  }

  /** The first occurrence of `p` in `s` at or after `i`. */
  function FindFrom(s: string, p: string, i: nat): (r: Option<nat>)
    requires i <= |s|
    ensures r.Some? ==> i <= r.value && At(s, r.value, p)
    decreases |s| - i
  {
    if At(s, i, p) then Some(i)
    else if i == |s| then None
    else FindFrom(s, p, i + 1)
  }

  /** Nothing before the answer of FindFrom is an occurrence. */
  lemma {:induction false} FindFromFirst(s: string, p: string, i: nat)
    requires i <= |s|
    ensures forall j :: i <= j && (FindFrom(s, p, i).None? || j < FindFrom(s, p, i).value) ==> !At(s, j, p)
    decreases |s| - i
  {
    if !At(s, i, p) && i < |s| {
      FindFromFirst(s, p, i + 1);
    }
  }

  /** The end of the run of spaces starting at `i` (the ` *` of the block pattern). */
  function IndentEnd(s: string, i: nat): (k: nat)
    requires i <= |s|
    ensures i <= k <= |s|
    decreases |s| - i
  {
    if i < |s| && s[i] == ' ' then IndentEnd(s, i + 1) else i
  }

  /** The block whose opening tag sits at `k`: its end, just after the first "</version>\n" behind the tag. */
  function BlockEnd(t: string, k: nat): (r: Option<nat>)
    requires k <= |t|
    ensures r.Some? ==> k + 20 <= r.value <= |t|
  {
    if !At(t, k, OpenTag) then None
    else
      match FindFrom(t, CloseTag, k + 9)
      case None => None
      case Some(e) => Some(e + 11)
  }

  /**
   * The pattern `( *<version .*?</version>\n)` with re.S tried at position `i`
   * of `t`: where the block ends, just after the first "</version>\n" behind
   * the opening tag.
   */
  function BlockAt(t: string, i: nat): (r: Option<nat>)
    requires i <= |t|
    ensures r.Some? ==> i + 20 <= r.value <= |t|
    decreases |t| - i
  {
    if i < |t| && t[i] == ' ' then BlockAt(t, i + 1) else BlockEnd(t, i)
  }

  /** The leading spaces are skipped, then the opening tag is looked for. */
  lemma {:induction false} BlockAtIsEnd(t: string, i: nat)
    requires i <= |t|
    ensures BlockAt(t, i) == BlockEnd(t, IndentEnd(t, i))
    decreases |t| - i
  {
    if i < |t| && t[i] == ' ' {
      BlockAtIsEnd(t, i + 1);
    }
  }

  /** A version block: spaces, the opening tag, anything, and the closing tag with its line break. */
  predicate IsBlock(b: string) {
    |b| >= 11 && At(b, IndentEnd(b, 0), OpenTag) && At(b, |b| - 11, CloseTag)
  }

  /** The match is lazy: the block ends at the first "</version>\n" after the opening tag. */
  lemma BlockEndsAtFirstClose(t: string, i: nat)
    requires i <= |t| && BlockAt(t, i).Some?
    ensures forall j :: IndentEnd(t, i) + 9 <= j < BlockAt(t, i).value - 11 ==> !At(t, j, CloseTag)
  {
    BlockAtIsEnd(t, i);
    FindFromFirst(t, CloseTag, IndentEnd(t, i) + 9);
  }

  lemma {:induction false} IndentEndInSlice(s: string, lo: nat, i: nat, hi: nat)
    requires lo <= i <= hi <= |s| && IndentEnd(s, i) <= hi
    ensures IndentEnd(s[lo..hi], i - lo) == IndentEnd(s, i) - lo
    decreases hi - i
  {
    if i < hi {
      assert s[lo..hi][i - lo] == s[i];
      if s[i] == ' ' {
        IndentEndInSlice(s, lo, i + 1, hi);
      }
    }
  }

  /** Cutting out spaces, an opening pattern `p` and a closing pattern `q` keeps both where they were. */
  lemma SliceKeepsEnds(t: string, i: nat, e: nat, p: string, q: string)
    requires i <= e <= |t| && |q| <= e && IndentEnd(t, i) + |p| <= e - |q|
    requires At(t, IndentEnd(t, i), p) && At(t, e - |q|, q)
    ensures At(t[i..e], IndentEnd(t[i..e], 0), p) && At(t[i..e], |t[i..e]| - |q|, q)
  {
    IndentEndInSlice(t, i, i, e);
    AtInSlice(t, i, e, IndentEnd(t, i), p);
    AtInSlice(t, i, e, e - |q|, q);
  }

  /** What the pattern matches at position `i` is a version block. */
  lemma BlockAtIsBlock(t: string, i: nat)
    requires i <= |t| && BlockAt(t, i).Some?
    ensures IsBlock(t[i..BlockAt(t, i).value])
  {
    var e := BlockAt(t, i).value;
    BlockAtIsEnd(t, i);
    SliceKeepsEnds(t, i, e, OpenTag, CloseTag);
  }

  /** Text between blocks, then a block. */
  datatype Piece = Piece(gap: string, block: string)

  /** The index seen as re.sub scans it: pieces of text each ending in a version block, then the rest. */
  datatype Layout = Layout(pieces: seq<Piece>, tail: string)

  /** The text of a layout, everything in order. */
  function Joined(l: Layout): string
    decreases |l.pieces|
  {
    if l.pieces == [] then l.tail
    else l.pieces[0].gap + l.pieces[0].block + Joined(Layout(l.pieces[1..], l.tail))
  }

  /** A character in front of a layout joins its first gap, or the tail when there is no block. */
  function PrependChar(c: char, l: Layout): (r: Layout)
    ensures |r.pieces| == |l.pieces| && (l.pieces != [] ==> r.pieces[0].block == l.pieces[0].block)
    ensures l.pieces != [] ==> r.pieces[1..] == l.pieces[1..]
  {
    if l.pieces == [] then Layout([], [c] + l.tail)
    else
      var p := l.pieces[0];
      var r := Layout([Piece([c] + p.gap, p.block)] + l.pieces[1..], l.tail);
      assert r.pieces[1..] == l.pieces[1..];
      r
  }

  lemma JoinedCons(p: Piece, ps: seq<Piece>, tail: string)
    ensures Joined(Layout([p] + ps, tail)) == p.gap + p.block + Joined(Layout(ps, tail))
  {
    assert ([p] + ps)[1..] == ps;
  }

  /** The character is put in front of the text. */
  lemma PrependCharJoined(c: char, l: Layout)
    ensures Joined(PrependChar(c, l)) == [c] + Joined(l)
  {
    if l.pieces != [] {
      var p := l.pieces[0];
      var ps := l.pieces[1..];
      assert l.pieces == [p] + ps;
      JoinedCons(p, ps, l.tail);
      JoinedCons(Piece([c] + p.gap, p.block), ps, l.tail);
      var j := Joined(Layout(ps, l.tail));
      assert [c] + p.gap + p.block + j == [c] + (p.gap + p.block + j);
    }
  }

  /** re.sub's left-to-right scan for version blocks from position `i`: the layout of the rest of the text. */
  function BlocksFrom(s: string, i: nat): (r: Layout)
    requires i <= |s|
    decreases |s| - i
  {
    if i == |s| then Layout([], [])
    else
      match BlockAt(s, i)
      case Some(e) =>
        var rest := BlocksFrom(s, e);
        Layout([Piece([], s[i..e])] + rest.pieces, rest.tail)
      case None =>
        PrependChar(s[i], BlocksFrom(s, i + 1))
  }

  /** The pieces of the layout put together give the text back. */
  lemma {:induction false} BlocksFromJoined(s: string, i: nat)
    requires i <= |s|
    ensures Joined(BlocksFrom(s, i)) == s[i..]
    decreases |s| - i
  {
    if i < |s| {
      match BlockAt(s, i)
      case Some(e) =>
        BlocksFromJoined(s, e);
        BlockJoined(s, i, e);
      case None =>
        BlocksFromJoined(s, i + 1);
        GapCharJoined(s, i);
    }
  }

  /** A block found at `i` is put back in front of the rest of the text. */
  lemma BlockJoined(s: string, i: nat, e: nat)
    requires i < |s| && BlockAt(s, i) == Some(e) && Joined(BlocksFrom(s, e)) == s[e..]
    ensures Joined(BlocksFrom(s, i)) == s[i..]
  {
    var rest := BlocksFrom(s, e);
    assert BlocksFrom(s, i) == Layout([Piece([], s[i..e])] + rest.pieces, rest.tail);
    JoinedCons(Piece([], s[i..e]), rest.pieces, rest.tail);
    assert [] + s[i..e] == s[i..e];
    SliceSplit(s, i, e);
  }

  /** A character where no block starts is put back in front of the rest of the text. */
  lemma GapCharJoined(s: string, i: nat)
    requires i < |s| && BlockAt(s, i).None? && Joined(BlocksFrom(s, i + 1)) == s[i + 1..]
    ensures Joined(BlocksFrom(s, i)) == s[i..]
  {
    assert BlocksFrom(s, i) == PrependChar(s[i], BlocksFrom(s, i + 1));
    PrependCharJoined(s[i], BlocksFrom(s, i + 1));
    assert [s[i]] + s[i + 1..] == s[i..];
  }

  /** Every piece's block is a version block. */
  predicate AllBlocks(ps: seq<Piece>)
    decreases |ps|
  {
    ps == [] || (IsBlock(ps[0].block) && AllBlocks(ps[1..]))
  }

  lemma AllBlocksCons(p: Piece, ps: seq<Piece>)
    requires IsBlock(p.block) && AllBlocks(ps)
    ensures AllBlocks([p] + ps)
  {
    assert ([p] + ps)[1..] == ps;
  }

  lemma AllBlocksPrepend(c: char, l: Layout)
    requires AllBlocks(l.pieces)
    ensures AllBlocks(PrependChar(c, l).pieces)
  {
  }

  /** Every block of the layout is a version block. */
  lemma {:induction false} BlocksFromAreBlocks(s: string, i: nat)
    requires i <= |s|
    ensures AllBlocks(BlocksFrom(s, i).pieces)
    decreases |s| - i
  {
    if i < |s| {
      match BlockAt(s, i)
      case Some(e) =>
        var rest := BlocksFrom(s, e);
        var block := s[i..e];
        assert BlocksFrom(s, i).pieces == [Piece([], block)] + rest.pieces;
        assert IsBlock(block) by {
          BlockAtIsBlock(s, i);
        }
        BlocksFromAreBlocks(s, e);
        AllBlocksCons(Piece([], block), rest.pieces);
      case None =>
        BlocksFromAreBlocks(s, i + 1);
        AllBlocksPrepend(s[i], BlocksFrom(s, i + 1));
    }
  }

  /** The layout of the whole text. */
  function Blocks(s: string): Layout {
    BlocksFrom(s, 0)
  }

  /** The layout is the text cut into pieces: nothing is lost, added or moved. */
  lemma BlocksJoined(s: string)
    ensures Joined(Blocks(s)) == s
  {
    BlocksFromJoined(s, 0);
    assert s[0..] == s;
  }

  /** Every block found in the index is a version block. */
  lemma BlocksAreBlocks(s: string)
    ensures AllBlocks(Blocks(s).pieces)
  {
    BlocksFromAreBlocks(s, 0);
  }

  /**
   * The `find` callback's answer for the block it is called on as the n-th
   * (the counter is already incremented): removed once past the limit or when
   * it mentions the tag being released, returned unchanged otherwise.
   */
  function Find(n: int, content: string, maxversions: int, tag: string): (r: string)
    ensures r == content || r == ""
    ensures r == content <==> content == "" || (n <= maxversions && !Contains(content, tag))
  {
    if n > maxversions || Contains(content, tag) then "" else content
  }

  /** The pieces with the k-th block (counting from `before` + 1) replaced by the callback's answer. */
  function FilterPieces(ps: seq<Piece>, before: int, maxversions: int, tag: string): (r: seq<Piece>)
    ensures |r| == |ps|
    decreases |ps|
  {
    if ps == [] then []
    else [Piece(ps[0].gap, Find(before + 1, ps[0].block, maxversions, tag))] + FilterPieces(ps[1..], before + 1, maxversions, tag)
  }

  /** The layout with every block replaced by the callback's answer. */
  function Filter(l: Layout, before: int, maxversions: int, tag: string): Layout {
    Layout(FilterPieces(l.pieces, before, maxversions, tag), l.tail)
  }

  /**
   * The index with old releases aged out: the text between blocks and every
   * block kept verbatim except the k-th, which is removed exactly when
   * k > maxversions or it contains the tag.
   */
  function Pruned(xml: string, maxversions: int, tag: string): (r: string)
    ensures |r| <= |xml|
  {
    FilterNoLonger(Blocks(xml).pieces, Blocks(xml).tail, 0, maxversions, tag);
    BlocksJoined(xml);
    Joined(Filter(Blocks(xml), 0, maxversions, tag))
  }

  /** The callback only ever removes a block, so filtering never lengthens the text. */
  lemma {:induction false} FilterNoLonger(ps: seq<Piece>, tail: string, before: int, maxversions: int, tag: string)
    ensures |Joined(Filter(Layout(ps, tail), before, maxversions, tag))| <= |Joined(Layout(ps, tail))|
    decreases |ps|
  {
    if ps != [] {
      var p := ps[0];
      FilterNoLonger(ps[1..], tail, before + 1, maxversions, tag);
      assert ps == [p] + ps[1..];
      FilterCons(p, ps[1..], tail, before, maxversions, tag);
      JoinedCons(Piece(p.gap, Find(before + 1, p.block, maxversions, tag)), FilterPieces(ps[1..], before + 1, maxversions, tag), tail);
      JoinedCons(p, ps[1..], tail);
    }
  }

  /** The k-th piece keeps its gap, and its block becomes the callback's answer for call number before + k + 1. */
  lemma {:induction false} FilterPiecesAt(ps: seq<Piece>, before: int, maxversions: int, tag: string)
    ensures forall k :: 0 <= k < |ps| ==>
              FilterPieces(ps, before, maxversions, tag)[k] == Piece(ps[k].gap, Find(before + k + 1, ps[k].block, maxversions, tag))
    decreases |ps|
  {
    if ps != [] {
      FilterPiecesAt(ps[1..], before + 1, maxversions, tag);
      var r := FilterPieces(ps, before, maxversions, tag);
      forall k | 0 <= k < |ps|
        ensures r[k] == Piece(ps[k].gap, Find(before + k + 1, ps[k].block, maxversions, tag))
      {
        if k > 0 {
          assert r[k] == FilterPieces(ps[1..], before + 1, maxversions, tag)[k - 1];
          assert ps[k] == ps[1..][k - 1];
        }
      }
    }
  }

  lemma FilterCons(p: Piece, ps: seq<Piece>, tail: string, before: int, maxversions: int, tag: string)
    ensures Filter(Layout([p] + ps, tail), before, maxversions, tag)
            == Layout([Piece(p.gap, Find(before + 1, p.block, maxversions, tag))] + FilterPieces(ps, before + 1, maxversions, tag), tail)
  {
    assert ([p] + ps)[1..] == ps;
  }

  lemma FilterPrepend(c: char, l: Layout, before: int, maxversions: int, tag: string)
    ensures Joined(Filter(PrependChar(c, l), before, maxversions, tag)) == [c] + Joined(Filter(l, before, maxversions, tag))
  {
    if l.pieces != [] {
      var p := l.pieces[0];
      var ps := l.pieces[1..];
      assert l.pieces == [p] + ps;
      assert PrependChar(c, l) == Layout([Piece([c] + p.gap, p.block)] + ps, l.tail);
      var f := Find(before + 1, p.block, maxversions, tag);
      var rest := FilterPieces(ps, before + 1, maxversions, tag);
      FilterCons(p, ps, l.tail, before, maxversions, tag);
      FilterCons(Piece([c] + p.gap, p.block), ps, l.tail, before, maxversions, tag);
      JoinedCons(Piece(p.gap, f), rest, l.tail);
      JoinedCons(Piece([c] + p.gap, f), rest, l.tail);
      var j := Joined(Layout(rest, l.tail));
      assert [c] + p.gap + f + j == [c] + (p.gap + f + j);
    }
  }

  /** The pruned layout of the text from position `i` on, after `before` calls of the callback. */
  function PrunedFrom(xml: string, i: nat, before: int, maxversions: int, tag: string): string
    requires i <= |xml|
  {
    Joined(Filter(BlocksFrom(xml, i), before, maxversions, tag))
  }

  /** A block at position `i` is the callback's next answer; the layout goes on after it with the count one higher. */
  lemma PrunedStepBlock(xml: string, i: nat, before: int, maxversions: int, tag: string)
    requires i < |xml| && BlockAt(xml, i).Some?
    ensures var e := BlockAt(xml, i).value;
            PrunedFrom(xml, i, before, maxversions, tag)
            == Find(before + 1, xml[i..e], maxversions, tag) + PrunedFrom(xml, e, before + 1, maxversions, tag)
  {
    var e := BlockAt(xml, i).value;
    var b := BlocksFrom(xml, e);
    assert BlocksFrom(xml, i) == Layout([Piece([], xml[i..e])] + b.pieces, b.tail);
    FilterCons(Piece([], xml[i..e]), b.pieces, b.tail, before, maxversions, tag);
    var f := Find(before + 1, xml[i..e], maxversions, tag);
    JoinedCons(Piece([], f), FilterPieces(b.pieces, before + 1, maxversions, tag), b.tail);
    assert [] + f == f;
  }

  /** A character at position `i` where no block starts is copied, and the count stays. */
  lemma PrunedStepChar(xml: string, i: nat, before: int, maxversions: int, tag: string)
    requires i < |xml| && BlockAt(xml, i).None?
    ensures PrunedFrom(xml, i, before, maxversions, tag) == [xml[i]] + PrunedFrom(xml, i + 1, before, maxversions, tag)
  {
    FilterPrepend(xml[i], BlocksFrom(xml, i + 1), before, maxversions, tag);
  }

  /**
   * The re.sub call with the counting callback: left to right, each block
   * found is replaced by `find`'s answer and everything else is copied.
   */
  method Prune(xml: string, maxversions: int, tag: string) returns (r: string)
    ensures r == Pruned(xml, maxversions, tag)
  {
    var nversions := 0;
    var i := 0;
    r := [];
    while i < |xml|
      invariant 0 <= i <= |xml|
      invariant r + PrunedFrom(xml, i, nversions, maxversions, tag) == Pruned(xml, maxversions, tag)
      decreases |xml| - i
    {
      var found := BlockAt(xml, i);
      if found.Some? {
        var e := found.value;
        PrunedStepBlock(xml, i, nversions, maxversions, tag);
        AppendAssoc(r, Find(nversions + 1, xml[i..e], maxversions, tag), PrunedFrom(xml, e, nversions + 1, maxversions, tag));
        nversions := nversions + 1;
        r := r + Find(nversions, xml[i..e], maxversions, tag);
        i := e;
      } else {
        PrunedStepChar(xml, i, nversions, maxversions, tag);
        AppendAssoc(r, [xml[i]], PrunedFrom(xml, i + 1, nversions, maxversions, tag));
        r := r + [xml[i]];
        i := i + 1;
      }
    }
    assert Filter(BlocksFrom(xml, i), nversions, maxversions, tag) == Layout([], []);
    assert r + [] == r;
  }

  /** Blocks counted from `before` + 1 that all stay within the limit and do not mention the tag are all kept. */
  lemma {:induction false} FilterKeepsAll(ps: seq<Piece>, before: int, maxversions: int, tag: string)
    requires before + |ps| <= maxversions
    requires forall k :: 0 <= k < |ps| ==> !Contains(ps[k].block, tag)
    ensures FilterPieces(ps, before, maxversions, tag) == ps
    decreases |ps|
  {
    if ps != [] {
      assert forall k :: 0 <= k < |ps[1..]| ==> ps[1..][k] == ps[k + 1];
      FilterKeepsAll(ps[1..], before + 1, maxversions, tag);
      assert ps == [ps[0]] + ps[1..];
    }
  }

  /** Within the limit and without the tag, every block stays and the index is unchanged. */
  lemma PruneKeepsRecentReleases(xml: string, maxversions: int, tag: string)
    requires |Blocks(xml).pieces| <= maxversions
    requires forall k :: 0 <= k < |Blocks(xml).pieces| ==> !Contains(Blocks(xml).pieces[k].block, tag)
    ensures Pruned(xml, maxversions, tag) == xml
  {
    FilterKeepsAll(Blocks(xml).pieces, 0, maxversions, tag);
    BlocksJoined(xml);
  }

  /** Text with every block removed: the gaps and the tail. */
  function Gaps(l: Layout): string
    decreases |l.pieces|
  {
    if l.pieces == [] then l.tail else l.pieces[0].gap + Gaps(Layout(l.pieces[1..], l.tail))
  }

  lemma {:induction false} JoinedWithoutBlocks(l: Layout)
    requires forall k :: 0 <= k < |l.pieces| ==> l.pieces[k].block == []
    ensures Joined(l) == Gaps(l)
    decreases |l.pieces|
  {
    if l.pieces != [] {
      JoinedWithoutBlocks(Layout(l.pieces[1..], l.tail));
      assert l.pieces[0].gap + [] == l.pieces[0].gap;
    }
  }

  /** With a limit of zero or less, every block is aged out and only the text around them is left. */
  lemma PruneAllWhenNoneKept(xml: string, maxversions: int, tag: string)
    requires maxversions <= 0
    ensures Pruned(xml, maxversions, tag) == Gaps(Blocks(xml))
  {
    var f := Filter(Blocks(xml), 0, maxversions, tag);
    FilterPiecesAt(Blocks(xml).pieces, 0, maxversions, tag);
    JoinedWithoutBlocks(f);
    assert Gaps(f) == Gaps(Blocks(xml)) by {
      GapsOfSameGaps(f, Blocks(xml));
    }
  }

  lemma {:induction false} GapsOfSameGaps(a: Layout, b: Layout)
    requires |a.pieces| == |b.pieces| && a.tail == b.tail
    requires forall k :: 0 <= k < |a.pieces| ==> a.pieces[k].gap == b.pieces[k].gap
    ensures Gaps(a) == Gaps(b)
    decreases |a.pieces|
  {
    if a.pieces != [] {
      GapsOfSameGaps(Layout(a.pieces[1..], a.tail), Layout(b.pieces[1..], b.tail));
    }
  }

  /**
   * `fpath[len(root)+1:]` after `fpath.startswith(root)`: the relative path as
   * the tool derives it; `None` for a file it skips.
   */
  function RelPathAsWritten(root: string, fpath: string): (r: Option<string>)
    ensures r.Some? <==> StartsWith(fpath, root)
    ensures r.Some? && |fpath| > |root| ==> fpath == root + [fpath[|root|]] + r.value
  {
    if !StartsWith(fpath, root) then None
    else if |root| + 1 <= |fpath| then
      assert fpath == root + [fpath[|root|]] + fpath[|root| + 1..];
      Some(fpath[|root| + 1..])
    else Some([])
  }

  /** The as-written test takes a file of a sibling directory for one inside the root. */
  lemma SiblingDirectoryAccepted(root: string, fpath: string)
    requires root == "/src/rtk" && fpath == "/src/rtk2/a.lua"
    ensures RelPathAsWritten(root, fpath) == Some("/a.lua")
  {
    assert fpath[..|root|] == root;
    assert fpath[|root| + 1..] == "/a.lua";
  }

  /** The root as a directory prefix: with exactly one '/' at its end. */
  function RootPrefix(root: string): (r: string)
    ensures EndsWith(r, "/")
  {
    if EndsWith(root, "/") then root else root + "/"
  }

  /**
   * The containment test and relative path the tool means: a file strictly
   * inside the root directory, and its path below it.
   */
  function RelPath(root: string, fpath: string): (r: Option<string>)
    ensures r.Some? <==> StartsWith(fpath, RootPrefix(root)) && |fpath| > |RootPrefix(root)|
    ensures r.Some? ==> r.value != [] && fpath == RootPrefix(root) + r.value
  {
    var prefix := RootPrefix(root);
    if StartsWith(fpath, prefix) && |fpath| > |prefix| then
      assert fpath == prefix + fpath[|prefix|..];
      Some(fpath[|prefix|..])
    else None
  }

  /** The relative path of a file below the root is the path it was written with. */
  lemma RelPathRoundTrip(root: string, rel: string)
    requires rel != []
    ensures RelPath(root, RootPrefix(root) + rel) == Some(rel)
  {
    var fpath := RootPrefix(root) + rel;
    assert fpath[..|RootPrefix(root)|] == RootPrefix(root);
    assert fpath[|RootPrefix(root)|..] == rel;
  }

  /** The corrected test turns the sibling-directory file away. */
  lemma SiblingDirectoryRejected(root: string, fpath: string)
    requires root == "/src/rtk" && fpath == "/src/rtk2/a.lua"
    ensures RelPath(root, fpath) == None
  {
    assert !EndsWith(root, "/");
    assert RootPrefix(root) == "/src/rtk/";
    assert fpath[8] == '2';
  }

  function UrlBase(repo: string, tag: string): string {
    "https://raw.githubusercontent.com/" + repo + "/" + tag + "/"
  }

  /** The `<source>` element of one release file. */
  function SourceLine(rel: string, repo: string, tag: string): string {
    "  <source file=\"../" + rel + "\" type=\"script\" main=\"nomain\">" + UrlBase(repo, tag) + rel + "</source>"
  }

  /** The `<source>` lines of the files inside the root, in the order of the files. */
  function Sources(root: string, files: seq<string>, repo: string, tag: string): (r: seq<string>)
    ensures |r| <= |files|
  {
    if files == [] then []
    else
      var before := Sources(root, files[..|files| - 1], repo, tag);
      match RelPath(root, files[|files| - 1])
      case None => before
      case Some(rel) => before + [SourceLine(rel, repo, tag)]
  }

  /** The loop over the release files: a `<source>` line per file inside the root, the others skipped. */
  method SourceLines(root: string, files: seq<string>, repo: string, tag: string) returns (lines: seq<string>)
    ensures lines == Sources(root, files, repo, tag)
  {
    lines := [];
    for i := 0 to |files|
      invariant lines == Sources(root, files[..i], repo, tag)
    {
      assert files[..i + 1][..i] == files[..i];
      var rel := RelPath(root, files[i]);
      if rel.Some? {
        lines := lines + [SourceLine(rel.value, repo, tag)];
      }
    }
    assert files[..|files|] == files;
  }

  /** When every file lies below the root, each one gets its line, in order. */
  lemma {:induction false} SourcesOfFilesInside(root: string, files: seq<string>, repo: string, tag: string)
    requires forall k :: 0 <= k < |files| ==> RelPath(root, files[k]).Some?
    ensures |Sources(root, files, repo, tag)| == |files|
    ensures forall k :: 0 <= k < |files| ==>
              Sources(root, files, repo, tag)[k] == SourceLine(RelPath(root, files[k]).value, repo, tag)
    decreases |files|
  {
    if files != [] {
      var init := files[..|files| - 1];
      assert forall k :: 0 <= k < |init| ==> init[k] == files[k];
      SourcesOfFilesInside(root, init, repo, tag);
      var before := Sources(root, init, repo, tag);
      var line := SourceLine(RelPath(root, files[|files| - 1]).value, repo, tag);
      assert Sources(root, files, repo, tag) == before + [line];
      forall k | 0 <= k < |files|
        ensures Sources(root, files, repo, tag)[k] == SourceLine(RelPath(root, files[k]).value, repo, tag)
      {
        if k < |init| {
          assert init[k] == files[k];
          calc {
            Sources(root, files, repo, tag)[k];
            (before + [line])[k];
            before[k];
            SourceLine(RelPath(root, init[k]).value, repo, tag);
          }
        } else {
          assert files[k] == files[|files| - 1];
          assert Sources(root, files, repo, tag)[k] == line;
        }
      }
    }
  }

  /** A file outside the root adds no line. */
  lemma SourcesSkipOutside(root: string, files: seq<string>, f: string, repo: string, tag: string)
    requires RelPath(root, f).None?
    ensures Sources(root, files + [f], repo, tag) == Sources(root, files, repo, tag)
  {
    assert (files + [f])[..|files|] == files;
  }

  const Indent := "      "

  /** The lines of the new `<version>` element, before indentation. */
  function VersionLines(version: string, author: string, tagtime: string, sources: seq<string>, changelog: string): seq<string> {
    ["<version name=\"" + version + "\" author=\"" + author + "\" time=\"" + tagtime + "\">"]
    + sources
    + ["  <changelog><![CDATA[" + changelog + "]]></changelog>", "</version>"]
  }

  /** Every line with the six-space prefix. */
  function Indented(lines: seq<string>): (r: seq<string>)
    ensures |r| == |lines| && forall k :: 0 <= k < |lines| ==> r[k] == Indent + lines[k]
  {
    seq(|lines|, k requires 0 <= k < |lines| => Indent + lines[k])
  }

  /** verxml: the new element's lines, each indented by six spaces, one per line. */
  function VerXml(version: string, author: string, tagtime: string, sources: seq<string>, changelog: string): (r: string)
    ensures StartsWith(r, Indent + "<version name=\"" + version + "\"")
    ensures EndsWith(r, "\n" + Indent + "</version>")
  {
    var lines := Indented(VersionLines(version, author, tagtime, sources, changelog));
    JoinedLinesEnds(lines, Indent + "<version name=\"" + version + "\"",
      " author=\"" + author + "\" time=\"" + tagtime + "\">", Indent + "</version>");
    Join(lines, "\n")
  }

  /** A join of two or more lines starts with any prefix of its first line and ends with its last line. */
  lemma JoinedLinesEnds(lines: seq<string>, p: string, q: string, last: string)
    requires |lines| >= 2 && lines[0] == p + q && lines[|lines| - 1] == last
    ensures StartsWith(Join(lines, "\n"), p)
    ensures EndsWith(Join(lines, "\n"), "\n" + last)
  {
    JoinEnds(lines, "\n");
    var j := Join(lines, "\n");
    assert j[..|p|] == j[..|lines[0]|][..|p|];
  }

  /** A join with at least two parts starts with the first part and ends with the separator and the last. */
  lemma {:induction false} JoinEnds(parts: seq<string>, sep: string)
    requires |parts| >= 2
    ensures StartsWith(Join(parts, sep), parts[0])
    ensures EndsWith(Join(parts, sep), sep + parts[|parts| - 1])
    decreases |parts|
  {
    var init := parts[..|parts| - 1];
    var j := Join(parts, sep);
    assert j == Join(init, sep) + sep + parts[|parts| - 1];
    assert j[|j| - |sep + parts[|parts| - 1]|..] == sep + parts[|parts| - 1];
    if |parts| == 2 {
      assert Join(init, sep) == parts[0];
    } else {
      JoinEnds(init, sep);
    }
    assert j[..|parts[0]|] == Join(init, sep)[..|parts[0]|];
  }

  const ReapackTag := "<reapack"

  /** The pattern `(<reapack.*\n)` at the start of `t`: the rest of the line with its '\n'. */
  function ReapackLineAt(t: string): (r: Option<Hit>)
    ensures r.Some? ==> StartsWith(t, ReapackTag) && 0 < r.value.len <= |t|
  {
    if !StartsWith(t, ReapackTag) then None
    else
      var e := IndexFrom(t, '\n', 8);
      if e < |t| then Some(Hit(e + 1, t[..e + 1])) else None
  }

  /** re.sub(r'(<reapack.*\n)', '\\1' + verxml + '\n', xml): the new block after each such line. */
  function InsertBlock(xml: string, verxml: string): (r: string)
    ensures (forall i :: 0 <= i < |xml| ==> !StartsAt(xml, i, ReapackTag)) ==> r == xml
  {
    NoReapackLineUnchanged(xml, Replacement(true, verxml + "\n"));
    SubAll(ReapackLineAt, xml, Replacement(true, verxml + "\n"))
  }

  /** An index with no `<reapack` anywhere passes through the substitution unchanged. */
  lemma NoReapackLineUnchanged(xml: string, r: Replacement)
    ensures (forall i :: 0 <= i < |xml| ==> !StartsAt(xml, i, ReapackTag)) ==> SubAll(ReapackLineAt, xml, r) == xml
  {
    if forall i :: 0 <= i < |xml| ==> !StartsAt(xml, i, ReapackTag) {
      forall i | 0 <= i < |xml|
        ensures !Matches(ReapackLineAt, xml[i..])
      {
        NoReapackLineAt(xml, i);
      }
      SubAllNoMatch(ReapackLineAt, xml, r);
    }
  }

  /** The pattern cannot match where no `<reapack` starts. */
  lemma NoReapackLineAt(s: string, i: nat)
    requires i < |s| && !StartsAt(s, i, ReapackTag)
    ensures !Matches(ReapackLineAt, s[i..])
  {
    if i + 8 <= |s| {
      assert s[i..][..8] == s[i..i + 8];
    }
  }

  /** A `<reapack` line is matched whole, with its '\n'. */
  lemma ReapackLineOf(attrs: string, post: string)
    requires '\n' !in attrs
    ensures var line := ReapackTag + attrs + "\n";
            ReapackLineAt(line + post) == Some(Hit(|line|, line))
  {
    var line := ReapackTag + attrs + "\n";
    var t := line + post;
    assert t[..8] == ReapackTag;
    assert forall q :: 8 <= q < |line| - 1 ==> t[q] == attrs[q - 8];
    assert t[|line| - 1] == '\n';
    assert IndexFrom(t, '\n', 8) == |line| - 1;
    assert t[..|line|] == line;
  }

  /** With one `<reapack` line, the block lands right below it and nothing else changes. */
  lemma InsertBelowReapack(pre: string, attrs: string, post: string, verxml: string)
    requires '\n' !in attrs
    requires forall i :: 0 <= i < |pre| ==> !StartsAt(pre + (ReapackTag + attrs + "\n" + post), i, ReapackTag)
    requires forall i :: 0 <= i < |post| ==> !StartsAt(post, i, ReapackTag)
    ensures InsertBlock(pre + (ReapackTag + attrs + "\n" + post), verxml)
            == pre + (ReapackTag + attrs + "\n") + (verxml + "\n") + post
  {
    var line := ReapackTag + attrs + "\n";
    var t := line + post;
    var xml := pre + t;
    var r := Replacement(true, verxml + "\n");
    assert SubAll(ReapackLineAt, xml, r) == pre + SubAll(ReapackLineAt, t, r) by {
      forall i | 0 <= i < |pre|
        ensures !Matches(ReapackLineAt, xml[i..])
      {
        NoReapackLineAt(xml, i);
      }
      SubAllSkip(ReapackLineAt, xml, r, |pre|);
      assert xml[..|pre|] == pre && xml[|pre|..] == t;
    }
    assert SubAll(ReapackLineAt, t, r) == line + (verxml + "\n") + SubAll(ReapackLineAt, post, r) by {
      ReapackLineOf(attrs, post);
      assert t[|line|..] == post;
    }
    assert SubAll(ReapackLineAt, post, r) == post by {
      forall i | 0 <= i < |post|
        ensures !Matches(ReapackLineAt, post[i..])
      {
        NoReapackLineAt(post, i);
      }
      SubAllNoMatch(ReapackLineAt, post, r);
    }
  }

  /**
   * What `main` writes: the index with old releases aged out and the new
   * release's block inserted below the `<reapack>` line; `None` when working
   * out the version stops the tool.
   */
  function Release(xml: string, tag: string, maxversions: int, root: string, files: seq<string>,
                   repo: string, author: string, tagtime: string, manifest: Option<string>,
                   reapackManifest: Option<string>, changelogs: map<string, string>): (r: Option<string>)
    ensures r.Some? <==> GenReapackVersion(Pruned(xml, maxversions, tag), manifest).Some?
  {
    var pruned := Pruned(xml, maxversions, tag);
    match GenReapackVersion(pruned, manifest)
    case None => None
    case Some(version) =>
      var changelog := Join(ChangelogLines(VersionSet(manifest), VersionSet(reapackManifest), changelogs), "\n");
      Some(InsertBlock(pruned, VerXml(version, author, tagtime, Sources(root, files, repo, tag), changelog)))
  }

  /** `main` from reading the index to writing it back, step by step. */
  method MakeRelease(xml: string, tag: string, maxversions: int, root: string, files: seq<string>,
                     repo: string, author: string, tagtime: string, manifest: Option<string>,
                     reapackManifest: Option<string>, changelogs: map<string, string>)
    returns (out: Option<string>)
    ensures out == Release(xml, tag, maxversions, root, files, repo, author, tagtime, manifest, reapackManifest, changelogs)
  {
    var pruned := Prune(xml, maxversions, tag);
    var version := GenReapackVersion(pruned, manifest);
    if version.None? {
      return None;
    }
    var sources := SourceLines(root, files, repo, tag);
    var changelog := GenChangelog(reapackManifest, manifest, changelogs);
    var verxml := VerXml(version.value, author, tagtime, sources, changelog);
    out := Some(InsertBlock(pruned, verxml));
  }
}
